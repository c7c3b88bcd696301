/** Value types and small sequence facts shared by every component. */
module Common {

  type byte = b: int | 0 <= b < 256

  datatype Option<+T> = None | Some(value: T)

  /** Every failure the modelled code reports, one constructor per error site family. */
  datatype Error =
    | OffsetTooLarge    // an offset or length no JS number can hold exactly
    | CallbackThrew
    | NotBytes
    | OverlongRead
    | ShortRead
    | SeekTooLarge
    | SeekOverflow
    | SeekBeforeStart
    | UnexpectedEof
    | NoParts
    | IndexOverflow
    | NotSized
    | BadHeader
    | BadIndex
    | OutOfRange
    | BadSlot
    | BadSector
    | BadDirectory
    | CorruptImage
    | NoExecutable
    | Truncated
    | TooLarge

  datatype Result<+T> = Ok(value: T) | Err(error: Error) {
    predicate IsFailure() { Err? }

    function PropagateFailure<U>(): Result<U>
      requires Err?
    {
      Err(error)
    }

    function Extract(): T
      requires Ok?
    {
      value
    }
  }

  /** ASCII lower case. */
  function Lower(c: char): char { if 'A' <= c <= 'Z' then c - 'A' + 'a' else c }

  /** An upper case ASCII letter and its lower case form. */
  predicate IsLetterPair(upper: char, lower: char) { 'A' <= upper <= 'Z' && lower as int == upper as int + 32 }

  lemma LowerMeaning(a: char, b: char)
    ensures Lower(a) == Lower(b) <==> a == b || IsLetterPair(a, b) || IsLetterPair(b, a)
  {
  }

  function Min(a: int, b: int): int { if a < b then a else b }

  function Max(a: int, b: int): int { if a < b then b else a }

  function DivCeil(a: nat, b: nat): nat
    requires b > 0
  {
    (a + b - 1) / b
  }

  function Pow2(n: nat): (r: nat)
    ensures r > 0
  {
    if n == 0 then 1 else 2 * Pow2(n - 1)
  }

  lemma {:induction false} Pow2Monotone(a: nat, b: nat)
    requires a <= b
    ensures Pow2(a) <= Pow2(b)
    decreases b - a
  {
    if a < b {
      Pow2Monotone(a, b - 1);
    }
  }

  function Zeros(n: nat): (r: seq<byte>)
    ensures |r| == n && forall i :: 0 <= i < n ==> r[i] == 0
  {
    seq(n, _ => 0)
  }

  /** The concatenation of a sequence of sequences. */
  function Flatten<T>(ss: seq<seq<T>>): seq<T> {
    if ss == [] then [] else ss[0] + Flatten(ss[1..])
  }

  lemma FlattenHead<T>(parts: seq<seq<T>>, rest: seq<seq<T>>, after: seq<T>)
    requires parts != [] && parts[1..] == rest
    ensures Flatten(parts) == parts[0] + Flatten(rest)
    ensures parts[0] + (Flatten(rest) + after) == parts[0] + Flatten(rest) + after
  {
  }

  lemma {:induction false} FlattenAppend<T>(a: seq<seq<T>>, b: seq<seq<T>>)
    ensures Flatten(a + b) == Flatten(a) + Flatten(b)
  {
    if a == [] {
      assert a + b == b;
    } else {
      assert (a + b)[1..] == a[1..] + b;
      hide Flatten;
      FlattenAppend(a[1..], b);
      FlattenHead(a, a[1..], Flatten(b));
      FlattenHead(a + b, a[1..] + b, []);
    }
  }

  lemma FlattenSnoc<T>(a: seq<seq<T>>, x: seq<T>)
    ensures Flatten(a + [x]) == Flatten(a) + x
  {
    FlattenAppend(a, [x]);
    assert Flatten([x]) == x + Flatten<T>([]);
  }

  lemma PrefixStep<T>(parts: seq<seq<T>>, i: nat)
    requires i < |parts|
    ensures Flatten(parts[..i + 1]) == Flatten(parts[..i]) + parts[i]
  {
    assert parts[..i + 1] == parts[..i] + [parts[i]];
    FlattenSnoc(parts[..i], parts[i]);
  }

  /** Part `i` inside the concatenation: what comes before, the part, what comes after. */
  lemma PartOfWhole<T>(parts: seq<seq<T>>, i: nat)
    requires i < |parts|
    ensures Flatten(parts) == Flatten(parts[..i]) + parts[i] + Flatten(parts[i + 1..])
  {
    hide Flatten;
    PrefixStep(parts, i);
    assert parts == parts[..i + 1] + parts[i + 1..];
    FlattenAppend(parts[..i + 1], parts[i + 1..]);
  }

  /** A slice of a slice is a slice. */
  lemma SubSlice<T>(s: seq<T>, lo: nat, hi: nat, a: nat, b: nat)
    requires lo <= hi <= |s| && a <= b <= hi - lo
    ensures s[lo..hi][a..b] == s[lo + a..lo + b]
  {
    var inner := s[lo..hi];
    var left, right := inner[a..b], s[lo + a..lo + b];
    assert |left| == |right|;
    forall i | 0 <= i < |left| ensures left[i] == right[i] {
      assert left[i] == inner[a + i] == s[lo + (a + i)];
    }
  }

  /** `buf` with `bytes` written over it from `at`. */
  function Splice<T>(buf: seq<T>, at: nat, bytes: seq<T>): (r: seq<T>)
    requires at + |bytes| <= |buf|
    ensures |r| == |buf|
  {
    buf[..at] + bytes + buf[at + |bytes|..]
  }

  lemma SpliceNothing<T>(buf: seq<T>, at: nat)
    requires at <= |buf|
    ensures Splice(buf, at, []) == buf
  {
  }

  /** Two adjacent writes are one. */
  lemma SpliceSplice<T>(buf: seq<T>, at: nat, x: seq<T>, y: seq<T>)
    requires at + |x| + |y| <= |buf|
    ensures Splice(Splice(buf, at, x), at + |x|, y) == Splice(buf, at, x + y)
  {
    var once := Splice(buf, at, x);
    var left, right := Splice(once, at + |x|, y), Splice(buf, at, x + y);
    forall i | 0 <= i < |left| ensures left[i] == right[i] {
    }
  }

  /** `buf[at..].copy_from_slice(bytes)`. */
  method CopyInto(buf: array<byte>, at: nat, bytes: seq<byte>)
    requires at + |bytes| <= buf.Length
    modifies buf
    ensures buf[..] == Splice(old(buf[..]), at, bytes)
  {
    forall i | 0 <= i < |bytes| {
      buf[at + i] := bytes[i];
    }
  }

  lemma MultisetRemove<T>(s: seq<T>, i: nat)
    requires i < |s|
    ensures multiset(s) == multiset(s[..i] + s[i + 1..]) + multiset{s[i]}
    ensures multiset(s[..i] + s[i + 1..]) == multiset(s) - multiset{s[i]}
  {
    assert s == s[..i] + [s[i]] + s[i + 1..];
  }

  lemma MultisetHead<T>(s: seq<T>)
    requires s != []
    ensures multiset(s) == multiset(s[1..]) + multiset{s[0]}
    ensures multiset(s[1..]) == multiset(s) - multiset{s[0]}
  {
    assert s == [s[0]] + s[1..];
  }

  lemma MultisetInsert<T>(s: seq<T>, i: nat, x: T)
    requires i <= |s|
    ensures multiset(s[..i] + [x] + s[i..]) == multiset(s) + multiset{x}
  {
    assert s == s[..i] + s[i..];
  }

  lemma MultisetSnoc<T>(s: seq<T>, n: nat)
    requires n < |s|
    ensures multiset(s[..n + 1]) == multiset(s[..n]) + multiset{s[n]}
  {
    assert s[..n + 1] == s[..n] + [s[n]];
  }

  /** The naturals in `[lo, hi)`. */
  function Range(lo: nat, hi: nat): (r: set<nat>)
    ensures forall k: nat :: k in r <==> lo <= k < hi
    decreases hi
  {
    if lo >= hi then {} else Range(lo, hi - 1) + {hi - 1}
  }

  lemma {:induction false} RangeCount(lo: nat, hi: nat)
    requires lo <= hi
    ensures |Range(lo, hi)| == hi - lo
    decreases hi
  {
    hide *;
    if lo < hi {
      RangeGrows(lo, hi);
      RangeCount(lo, hi - 1);
      AddedOne(Range(lo, hi - 1), hi - 1);
    } else {
      EmptyRange(lo);
    }
  }

  lemma EmptyRange(lo: nat)
    ensures |Range(lo, lo)| == 0
  {
  }

  lemma RangeGrows(lo: nat, hi: nat)
    requires lo < hi
    ensures Range(lo, hi) == Range(lo, hi - 1) + {hi - 1} && hi - 1 !in Range(lo, hi - 1)
  {
  }

  lemma AddedOne(s: set<nat>, x: nat)
    requires x !in s
    ensures |s + {x}| == |s| + 1
  {
  }

  /** A set of naturals inside an interval has at most as many members as the interval. */
  lemma {:induction false} IntervalBound(s: set<nat>, lo: nat, hi: nat)
    requires lo <= hi
    requires forall x :: x in s ==> lo <= x < hi
    ensures |s| <= hi - lo
    decreases hi - lo
  {
    if lo == hi {
      assert s == {};
    } else {
      var t := s - {lo};
      IntervalBound(t, lo + 1, hi);
      assert s <= t + {lo};
      SubsetSize(s, t + {lo});
    }
  }

  lemma {:induction false} SubsetSize<T>(a: set<T>, b: set<T>)
    requires a <= b
    ensures |a| <= |b|
    decreases a
  {
    if a != {} {
      var x :| x in a;
      SubsetSize(a - {x}, b - {x});
    }
  }
}
